/**
 * Sending a packet: `dmx_send_num` starts it, the timer interrupt times the
 * break and the mark after it and feeds the first bytes, and the transmit half
 * of the UART interrupt feeds the rest as the FIFO empties.
 *
 * Assumed of the hardware: the timer fires only while it runs, and TX_DONE
 * comes only once everything was fed and has drained.
 */
module Transmit {
  import opened Bytes
  import opened Packets
  import opened Receive
  import PacketBuffer

  /** The driver's transmit state. `sent` is what was put into the UART's FIFO. */
  datatype Tx = Tx(
    data: Buffer, size: int, head: int, progress: Progress, status: Status,
    timerRunning: bool, txDataEnabled: bool, txDoneEnabled: bool, sent: seq<Byte>)

  datatype Event =
    | TimerFires(free: nat)       // with that much space in the FIFO
    | FifoEmpties(free: nat)
    | FifoDrained

  // ----- Starting -----

  /** The size of the packet in the buffer: an RDM packet's own, otherwise what the caller asked for. */
  function SendSize(data: Buffer, size: nat): (n: nat)
    ensures n <= PACKET_MAX
  {
    match ReadHeader(data)
    case Some(h) =>
      if !CcIsValid(h.cc) then DmxSize(size)
      else if IsDiscoveryResponse(h) then h.messageLen
      else h.messageLen as int + 2
    case None => DmxSize(size)
  }

  function DmxSize(size: nat): (n: nat)
    ensures 1 <= n <= PACKET_MAX
  {
    if size == 0 || size > PACKET_MAX then PACKET_MAX else size
  }

  /** Discovery responses go out at once; everything else starts with a break. */
  predicate NeedsBreak(data: Buffer) {
    match ReadHeader(data)
    case Some(h) => !IsDiscoveryResponse(h)
    case None => true
  }

  function Min(a: int, b: int): int {
    if a < b then a else b
  }

  lemma ResponsesAreValid()
    ensures forall h: Header :: IsDiscoveryResponse(h) ==> CcIsValid(h.cc)
  {
  }

  /** The driver right after `dmx_send_num` started the packet, with that much space in the FIFO. */
  function Start(data: Buffer, size: nat, progress: Progress, free: nat): Tx {
    var n := SendSize(data, size);
    if NeedsBreak(data) then
      Tx(data, n, 0, InBreak, Sending, true, false, false, [])
    else
      var fed := Min(n, free);
      Tx(data, n, fed, progress, Sending, false, true, true, data[..fed])
  }

  // ----- The interrupts -----

  predicate CanHappen(s: Tx, e: Event) {
    match e
    case TimerFires(_) => s.timerRunning
    case FifoEmpties(_) => s.txDataEnabled
    case FifoDrained => s.txDoneEnabled && s.head == s.size
  }

  predicate Sane(s: Tx) {
    0 <= s.head <= s.size <= PACKET_MAX
  }

  function OnEvent(s: Tx, e: Event): Tx
    requires Sane(s)
  {
    match e
    case TimerFires(free) =>
      if s.status != Sending then s.(timerRunning := false)
      else if s.progress == InBreak then s.(progress := InMab)
      else
        var fed := Min(s.size, free);
        s.(head := fed, timerRunning := false, txDataEnabled := true, txDoneEnabled := true,
           sent := s.sent + s.data[..fed])
    case FifoEmpties(free) =>
      var fed := Min(s.size - s.head, free);
      s.(head := s.head + fed, sent := s.sent + s.data[s.head..s.head + fed],
         txDataEnabled := s.txDataEnabled && s.head + fed != s.size)
    case FifoDrained =>
      s.(progress := Complete, status := Idle, txDataEnabled := false, txDoneEnabled := false)
  }

  /**
   * What holds at every moment of a transmission: the bytes sent are the bytes
   * up to the head, and the timer no longer runs once any byte was sent.
   */
  ghost predicate Inv(s: Tx) {
    && Sane(s) && s.sent == s.data[..s.head]
    && (s.timerRunning ==> s.head == 0 && s.status == Sending && !s.txDataEnabled && !s.txDoneEnabled)
    && (!s.timerRunning && !s.txDoneEnabled ==> s.status == Idle && s.head == s.size)
    && (s.status == Sending || s.status == Idle) && (s.status == Idle ==> !s.txDataEnabled && !s.txDoneEnabled)
    && (s.status == Idle ==> s.progress == Complete)
    && (s.txDoneEnabled && s.head < s.size ==> s.txDataEnabled)
  }

  lemma StartInv(data: Buffer, size: nat, progress: Progress, free: nat)
    ensures Inv(Start(data, size, progress, free))
    ensures Start(data, size, progress, free).data == data
    ensures Start(data, size, progress, free).size == SendSize(data, size)
  {
  }

  lemma StepInv(s: Tx, e: Event)
    requires Inv(s) && CanHappen(s, e)
    ensures Inv(OnEvent(s, e)) && OnEvent(s, e).data == s.data && OnEvent(s, e).size == s.size
    ensures s.sent <= OnEvent(s, e).sent
  {
    var t := OnEvent(s, e);
    if e.TimerFires? {
      assert s.sent == [];
    } else if e.FifoEmpties? {
      assert s.data[..s.head] + s.data[s.head..t.head] == s.data[..t.head];
    }
  }

  /** A run: every event can happen when it does. */
  ghost predicate IsRun(states: seq<Tx>, es: seq<Event>) {
    && |states| == |es| + 1
    && (forall i :: 0 <= i < |states| ==> Sane(states[i]))
    && forall i :: 0 <= i < |es| ==> CanHappen(states[i], es[i]) && states[i + 1] == OnEvent(states[i], es[i])
  }

  /**
   * In every run from the start of a packet, for every schedule of interrupts
   * and every amount of free space, what was sent is exactly the first `head`
   * bytes, each once and in order.
   */
  lemma {:induction false} SentIsPrefix(data: Buffer, size: nat, progress: Progress, free: nat,
                                        states: seq<Tx>, es: seq<Event>, k: nat)
    requires IsRun(states, es) && states[0] == Start(data, size, progress, free) && k < |states|
    ensures Inv(states[k]) && states[k].data == data && states[k].size == SendSize(data, size)
    ensures states[k].head <= SendSize(data, size) && states[k].sent == data[..states[k].head]
    decreases k
  {
    if k == 0 {
      StartInv(data, size, progress, free);
    } else {
      SentIsPrefix(data, size, progress, free, states, es, k - 1);
      assert CanHappen(states[k - 1], es[k - 1]) && states[k - 1 + 1] == OnEvent(states[k - 1], es[k - 1]);
      StepInv(states[k - 1], es[k - 1]);
    }
  }

  /** A run that has gone idle sent the whole packet, and nothing can happen any more. */
  lemma FinishedSentAll(data: Buffer, size: nat, progress: Progress, free: nat, states: seq<Tx>, es: seq<Event>)
    requires IsRun(states, es) && states[0] == Start(data, size, progress, free)
    requires states[|es|].status == Idle
    ensures states[|es|].sent == data[..SendSize(data, size)] && states[|es|].progress == Complete
    ensures forall e :: !CanHappen(states[|es|], e)
  {
    SentIsPrefix(data, size, progress, free, states, es, |es|);
  }

  // ----- Break, mark, data -----

  /** The buffer reads as a discovery response, which goes out without a break. */
  ghost predicate ReadsAsResponse(data: Buffer) {
    ReadHeader(data).Some? && ReadHeader(data).value.cc == 0x11 && ReadHeader(data).value.pid == 1
  }

  /**
   * In every run, a packet that is not a discovery response starts with a
   * break; nothing is sent before the timer has fired twice, at the end of the
   * break and at the end of the mark after it.
   */
  lemma {:induction false} BreakFirst(data: Buffer, size: nat, progress: Progress, free: nat,
                                      states: seq<Tx>, es: seq<Event>, k: nat)
    requires IsRun(states, es) && states[0] == Start(data, size, progress, free) && k < |states|
    requires !ReadsAsResponse(data)
    ensures states[0].progress == InBreak && states[0].sent == []
    ensures k >= 1 ==> es[0].TimerFires? && states[1].progress == InMab && states[1].sent == []
    ensures k >= 2 ==> es[1].TimerFires? && states[2].sent == data[..Min(SendSize(data, size), es[1].free)]
    ensures k >= 3 ==> !es[k - 1].TimerFires?
    decreases k
  {
    StartInv(data, size, progress, free);
    if k >= 1 {
      BreakFirst(data, size, progress, free, states, es, k - 1);
      assert CanHappen(states[k - 1], es[k - 1]) && states[k - 1 + 1] == OnEvent(states[k - 1], es[k - 1]);
    }
    if k >= 3 {
      TimerStaysOff(states, es, 2, k - 1);
    }
  }

  /** Once stopped the timer does not run again. */
  lemma {:induction false} TimerStaysOff(states: seq<Tx>, es: seq<Event>, from: nat, k: nat)
    requires IsRun(states, es) && from <= k < |states| && !states[from].timerRunning
    ensures !states[k].timerRunning
    decreases k
  {
    if k > from {
      TimerStaysOff(states, es, from, k - 1);
      assert CanHappen(states[k - 1], es[k - 1]) && states[k - 1 + 1] == OnEvent(states[k - 1], es[k - 1]);
    }
  }

  /** A discovery response is fed at once, and the timer never fires. */
  lemma ResponseWithoutBreak(data: Buffer, size: nat, progress: Progress, free: nat,
                             states: seq<Tx>, es: seq<Event>, k: nat)
    requires IsRun(states, es) && states[0] == Start(data, size, progress, free) && k < |es|
    requires ReadsAsResponse(data)
    ensures states[0].sent == data[..Min(ReadHeader(data).value.messageLen, free)] && !es[k].TimerFires?
  {
    TimerStaysOff(states, es, 0, k);
    assert CanHappen(states[k], es[k]);
    hide ReadHeader;
  }

  /** What is sent to the end: a packet of RDM by its own length, anything else by the size asked for. */
  lemma SizeSent(data: Buffer, size: nat, progress: Progress, free: nat, states: seq<Tx>, es: seq<Event>)
    requires IsRun(states, es) && states[0] == Start(data, size, progress, free) && states[|es|].status == Idle
    ensures ReadHeader(data).None? || ReadHeader(data).value.cc % 0x10 >= 2 ==>
              states[|es|].sent == if 1 <= size <= 513 then data[..size] else data
    ensures ReadHeader(data).Some? && ReadHeader(data).value.cc % 0x10 < 2 ==>
              var length := ReadHeader(data).value.messageLen as int;
              states[|es|].sent == data[..if ReadsAsResponse(data) then length else length + 2]
  {
    FinishedSentAll(data, size, progress, free, states, es);
    hide ReadHeader, IsRun;
    assert data[..513] == data;
  }

  /** The FIFO has space when it says so; an interrupt without any makes no progress. */
  predicate FreesSpace(e: Event) {
    e.FifoEmpties? ==> e.free >= 1
  }

  /** While a packet is not finished some interrupt can still happen. */
  lemma NeverStuck(s: Tx)
    requires Inv(s) && s.status != Idle
    ensures exists e :: CanHappen(s, e) && FreesSpace(e)
  {
    if s.timerRunning {
      assert CanHappen(s, TimerFires(0));
    } else if s.txDataEnabled {
      assert CanHappen(s, FifoEmpties(1));
    } else {
      assert CanHappen(s, FifoDrained);
    }
  }

  /** The interrupts still to come, at most. */
  function Remaining(s: Tx): int {
    if s.status == Idle then 0
    else if s.timerRunning then s.size + (if s.progress == InBreak then 4 else 3)
    else s.size - s.head + (if s.txDataEnabled then 2 else 1)
  }

  lemma RemainingFalls(s: Tx, e: Event)
    requires Inv(s) && CanHappen(s, e) && FreesSpace(e)
    ensures 0 <= Remaining(OnEvent(s, e)) < Remaining(s)
  {
  }

  /**
   * Whatever the schedule, as long as the FIFO frees space when it says so, a
   * packet of n bytes takes at most n + 4 interrupts, and they stop exactly
   * when the whole packet has been sent.
   */
  lemma {:induction false} EveryRunFinishes(data: Buffer, size: nat, progress: Progress, free: nat,
                                            states: seq<Tx>, es: seq<Event>, k: nat)
    requires IsRun(states, es) && states[0] == Start(data, size, progress, free) && k <= |es|
    requires forall i :: 0 <= i < |es| ==> FreesSpace(es[i])
    ensures k + Remaining(states[k]) <= SendSize(data, size) + 4 && Remaining(states[k]) >= 0
    ensures (forall e :: FreesSpace(e) ==> !CanHappen(states[k], e)) <==> states[k].status == Idle
    ensures states[k].status == Idle ==> states[k].sent == data[..SendSize(data, size)]
    decreases k
  {
    hide SendSize, NeedsBreak;
    SentIsPrefix(data, size, progress, free, states, es, k);
    if states[k].status != Idle {
      NeverStuck(states[k]);
    }
    if k > 0 {
      EveryRunFinishes(data, size, progress, free, states, es, k - 1);
      SentIsPrefix(data, size, progress, free, states, es, k - 1);
      assert CanHappen(states[k - 1], es[k - 1]) && states[k - 1 + 1] == OnEvent(states[k - 1], es[k - 1]);
      RemainingFalls(states[k - 1], es[k - 1]);
    }
  }

  /** Every packet can be sent to the end. */
  lemma SomeRunFinishes(data: Buffer, size: nat, progress: Progress, free: nat)
    returns (states: seq<Tx>, es: seq<Event>)
    ensures IsRun(states, es) && states[0] == Start(data, size, progress, free) && states[|es|].status == Idle
  {
    hide SendSize, NeedsBreak;
    var s := Start(data, size, progress, free);
    if NeedsBreak(data) {
      es := [TimerFires(PACKET_MAX), TimerFires(PACKET_MAX), FifoDrained];
      var t := OnEvent(s, es[0]);
      var u := OnEvent(t, es[1]);
      states := [s, t, u, OnEvent(u, es[2])];
    } else {
      es := [FifoEmpties(PACKET_MAX), FifoDrained];
      var t := OnEvent(s, es[0]);
      states := [s, t, OnEvent(t, es[1])];
    }
  }

  // ----- The interrupts as the driver runs them -----

  class Sender {
    const data: array<Byte>
    var size: int
    var head: int
    var progress: Progress
    var status: Status
    var timerRunning: bool
    var txDataEnabled: bool
    var txDoneEnabled: bool
    var sent: seq<Byte>

    ghost predicate Valid()
      reads this
    {
      data.Length == PACKET_MAX && 0 <= head <= size <= PACKET_MAX
    }

    ghost function State(): (s: Tx)
      requires Valid()
      reads this, data
      ensures Sane(s)
    {
      Tx(data[..], size, head, progress, status, timerRunning, txDataEnabled, txDoneEnabled, sent)
    }

    constructor (buffer: array<Byte>)
      requires buffer.Length == PACKET_MAX
      ensures Valid() && data == buffer && status == Idle && sent == []
    {
      data := buffer;
      size, head, progress, status := PACKET_MAX, 0, Stale, Idle;
      timerRunning, txDataEnabled, txDoneEnabled, sent := false, false, false, [];
    }

    /** `dmx_uart_write_txfifo`: as much as fits, and how much that was. */
    method WriteFifo(from: nat, wanted: nat, free: nat) returns (written: nat)
      requires Valid() && from + wanted <= PACKET_MAX
      modifies this`sent
      ensures written == Min(wanted, free) && sent == old(sent) + data[from..from + written]
    {
      written := wanted;
      if written > free {
        written := free;
      }
      sent := sent + data[from..from + written];
    }

    /** The part of `dmx_send_num` that chooses the size and starts the packet. */
    method StartSending(wanted: nat, free: nat)
      requires data.Length == PACKET_MAX
      modifies this
      ensures Valid() && State() == Start(data[..], wanted, old(progress), free)
    {
      hide ReadHeader, CcIsValid, IsDiscoveryResponse;
      var header := PacketBuffer.ReadHeaderOf(data);
      ResponsesAreValid();
      if header.Some? && CcIsValid(header.value.cc) {
        size := if IsDiscoveryResponse(header.value) then header.value.messageLen
                else header.value.messageLen as int + 2;
      } else if wanted == 0 || wanted > PACKET_MAX {
        size := PACKET_MAX;
      } else {
        size := wanted;
      }
      head, status, sent := 0, Sending, [];
      if header.Some? && IsDiscoveryResponse(header.value) {
        head := WriteFifo(0, size, free);
        timerRunning, txDataEnabled, txDoneEnabled := false, true, true;
      } else {
        progress, timerRunning, txDataEnabled, txDoneEnabled := InBreak, true, false, false;
      }
      assert data[0..head] == data[..head] == data[..][..head];
    }

    /** `dmx_timer_isr`. */
    method OnTimer(free: nat)
      requires Valid()
      modifies this
      ensures Valid() && State() == OnEvent(old(State()), TimerFires(free))
    {
      if status == Sending {
        if progress == InBreak {
          progress := InMab;
        } else {
          head := WriteFifo(0, size, free);
          assert data[0..head] == data[..][..head];
          timerRunning, txDataEnabled, txDoneEnabled := false, true, true;
        }
      } else {
        timerRunning := false;
      }
    }

    /** The transmit interrupt with room in the FIFO. */
    method OnTxData(free: nat)
      requires Valid()
      modifies this
      ensures Valid() && State() == OnEvent(old(State()), FifoEmpties(free))
    {
      var written := WriteFifo(head, size - head, free);
      assert data[head..head + written] == data[..][head..head + written];
      head := head + written;
      if head == size {
        txDataEnabled := false;
      }
    }

    /** The transmit interrupt once the last byte has left. */
    method OnTxDone()
      requires Valid()
      modifies this
      ensures Valid() && State() == OnEvent(old(State()), FifoDrained)
    {
      txDataEnabled, txDoneEnabled := false, false;
      progress, status := Complete, Idle;
    }
  }
}
